/**
 * Registrations and lookups shaped like the router's own API tables
 * (/users/:user beside /users/topusers, /authorizations/:id beside
 * /authorizations/clients/:client_id, /regex/integer/:n!\d+), stated for
 * any segment texts: static parts beat parameters, a parameter captures
 * its segment, a constraint filters segments, conflicting parameter names
 * are refused, and a literal "?" part is taken for a parameter.
 */
module Scenarios {
  import opened Wrappers
  import opened Strings
  import opened Errors
  import opened Patterns
  import opened Trie
  import opened Registrar
  import opened Matcher

  /** A literal segment text: non-empty, no slash, not a parameter. */
  predicate Plain(s: string)
  {
    s != "" && '/' !in s && !HasPrefix(s, ":")
  }

  /** A parameter name that separate keeps as it is: non-empty, no slash, no `!`, no white space. */
  predicate PlainName(name: string)
  {
    name != "" && '/' !in name && '!' !in name && forall k :: 0 <= k < |name| ==> !IsSpace(name[k])
  }

  /** `:name` is parsed to the name itself, with no constraint, and the cache is untouched. */
  lemma SeparatePlain(name: string, cache: Cache, engine: Engine)
    requires PlainName(name)
    ensures Separate(":" + name, cache, engine) == Success((Parsed(name, None), cache))
  {
    PlainNameText(name);
  }

  /** A plain name after `:` has no `!`, and its name text and parameter name are the name itself. */
  lemma PlainNameText(name: string)
    requires PlainName(name)
    ensures '!' !in ":" + name && NameText(":" + name) == name && ParamName(":" + name) == name
  {
    var s := ":" + name;
    assert '!' !in s by {
      forall k | 0 <= k < |s| ensures s[k] != '!' {
        if k > 0 { assert s[k] == name[k - 1]; }
      }
    }
    assert s[1..|s|] == name;
  }

  /** `:name!pat` is parsed to the name and the pattern, the pattern going through the cache. */
  lemma SeparateConstrained(name: string, pat: string, cache: Cache, engine: Engine)
    requires PlainName(name)
    ensures var s := ":" + name + "!" + pat;
      && PatternOf(s) == Some(pat)
      && Separate(s, cache, engine) == match Cached(pat, cache, engine)
        case Failure(e) => Failure(e)
        case Success((re, cache')) => Success((Parsed(name, Some(re)), cache'))
  {
    ConstrainedNameText(name, pat);
  }

  /** In `:name!pat` with a plain name, the first `!` follows the name: the name is the name and the pattern is `pat`. */
  lemma ConstrainedNameText(name: string, pat: string)
    requires PlainName(name)
    ensures var s := ":" + name + "!" + pat;
      NameText(s) == name && ParamName(s) == name && PatternOf(s) == Some(pat)
  {
    var s := ":" + name + "!" + pat;
    var i := |name| + 1;
    assert s[i] == '!';
    assert s[..i] == ":" + name;
    assert '!' !in s[..i] by {
      forall k | 0 <= k < i ensures s[k] != '!' {
        if k > 0 { assert s[k] == name[k - 1]; }
      }
    }
    assert FirstIndex(s, '!') == i;
    assert s[1..i] == name;
    assert s[i + 1..] == pat;
  }

  /** A parameter segment has no slash. */
  lemma ParamPartNoSlash(name: string, tail: string)
    requires '/' !in name && '/' !in tail
    ensures '/' !in ":" + name + tail
  {
    var s := ":" + name + tail;
    forall k | 0 <= k < |s| ensures s[k] != '/' {
      if 0 < k <= |name| { assert s[k] == name[k - 1]; }
      else if k > |name| { assert s[k] == tail[k - 1 - |name|]; }
    }
  }

  /** The node a parameter registration creates, with the handler added. */
  function Leaf<H>(name: string, re: Option<Pat>, verb: string, h: H): Node<H>
  {
    Node(map[], Some(map[verb := h]), name, re)
  }

  /** route of "/a/b" for two segment texts without slashes inserts exactly [a, b]. */
  lemma RouteTwo<H>(root: Node<H>, cache: Cache, a: string, b: string, verb: string, h: H, engine: Engine)
    requires a != "" && b != "" && '/' !in a && '/' !in b
    ensures RouteSpec(root, cache, "/" + a + "/" + b, Some(h), verb, engine) == Insert(root, [a, b], cache, verb, h, engine)
  {
    var parts := [a, b];
    assert Join(parts, '/') == a + "/" + b by {
      assert parts[1..] == [b];
    }
    assert "/" + a + "/" + b == "/" + Join(parts, '/');
    RouteOfJoin(root, cache, parts, verb, h, engine);
  }

  /** Insert at a literal first part: reuse or create the child under the part itself and descend. */
  lemma InsertPlainStep<H>(n: Node<H>, a: string, rest: seq<string>, cache: Cache, verb: string, h: H, engine: Engine)
    requires !HasPrefix(a, ":")
    ensures var child := if a in n.children then n.children[a] else NewNode<H>();
      Insert(n, [a] + rest, cache, verb, h, engine)
      == match Insert(child, rest, cache, verb, h, engine)
         case Failure(e) => Failure(e)
         case Success((c, cache')) => Success((n.(children := n.children[a := c]), cache'))
  {
    assert ([a] + rest)[0] == a && ([a] + rest)[1..] == rest;
  }

  /** Insert at a parameter first part that separates to `parsed`: check validParam, then reuse or create the Any child and descend. */
  lemma InsertParamStep<H>(n: Node<H>, part: string, rest: seq<string>, cache: Cache, parsed: Parsed, cache1: Cache,
                           verb: string, h: H, engine: Engine)
    requires HasPrefix(part, ":") && Separate(part, cache, engine) == Success((parsed, cache1))
    ensures var child := if Any in n.children then n.children[Any] else Fresh<H>(true, parsed);
      Insert(n, [part] + rest, cache, verb, h, engine)
      == if !ValidParam(parsed.name, n) then Failure(ParamConflict(parsed.name))
         else match Insert(child, rest, cache1, verb, h, engine)
           case Failure(e) => Failure(e)
           case Success((c, cache')) => Success((n.(children := n.children[Any := c]), cache'))
  {
    assert ([part] + rest)[0] == part && ([part] + rest)[1..] == rest;
  }

  /** Inserting [a, :name] into an empty trie: one literal child, one parameter grandchild. */
  lemma InsertParam<H>(a: string, name: string, verb: string, h: H, engine: Engine)
    requires Plain(a) && PlainName(name)
    ensures Insert(NewNode<H>(), [a, ":" + name], map[], verb, h, engine)
         == Success((Node(map[a := Node(map[Any := Leaf(name, None, verb, h)], None, "", None)], None, "", None), map[]))
  {
    var p := ":" + name;
    InsertParamLeaf(name, verb, h, engine);
    InsertPlainNew(a, [p], map[], Node(map[Any := Leaf(name, None, verb, h)], None, "", None), map[], verb, h, engine);
    assert [a] + [p] == [a, p];
  }

  /** A literal first part on an empty trie: the rest goes into a new child under the part. */
  lemma InsertPlainNew<H>(a: string, rest: seq<string>, cache: Cache, c: Node<H>, cache': Cache, verb: string, h: H, engine: Engine)
    requires !HasPrefix(a, ":")
    requires Insert(NewNode<H>(), rest, cache, verb, h, engine) == Success((c, cache'))
    ensures Insert(NewNode<H>(), [a] + rest, cache, verb, h, engine) == Success((Node(map[a := c], None, "", None), cache'))
  {
    InsertPlainStep(NewNode<H>(), a, rest, cache, verb, h, engine);
  }

  /** Inserting the single part `:name` into an empty trie: a parameter leaf under Any. */
  lemma InsertParamLeaf<H>(name: string, verb: string, h: H, engine: Engine)
    requires PlainName(name)
    ensures Insert(NewNode<H>(), [":" + name], map[], verb, h, engine)
         == Success((Node(map[Any := Leaf(name, None, verb, h)], None, "", None), map[]))
  {
    var p := ":" + name;
    SeparatePlain(name, map[], engine);
    InsertParamStep(NewNode<H>(), p, [], map[], Parsed(name, None), map[], verb, h, engine);
    assert [p] + [] == [p];
    assert Insert(Fresh<H>(true, Parsed(name, None)), [], map[], verb, h, engine) == Success((Leaf(name, None, verb, h), map[]));
  }

  /** Registering "/a/:name" on an empty trie. */
  lemma RegisterParam<H>(a: string, name: string, verb: string, h: H, engine: Engine)
    requires Plain(a) && PlainName(name)
    ensures RouteSpec(NewNode<H>(), map[], "/" + a + "/:" + name, Some(h), verb, engine)
         == Success((Node(map[a := Node(map[Any := Leaf(name, None, verb, h)], None, "", None)], None, "", None), map[]))
  {
    ParamPartNoSlash(name, "");
    assert ":" + name + "" == ":" + name;
    ParamPathConcat(a, name);
    RouteTwo(NewNode<H>(), map[], a, ":" + name, verb, h, engine);
    InsertParam(a, name, verb, h, engine);
  }

  /** Inserting [a, b] beside the parameter child: b becomes a literal sibling. */
  lemma InsertStatic<H>(a: string, b: string, name: string, cache: Cache, v1: string, h1: H, v2: string, h2: H, engine: Engine)
    requires Plain(a) && Plain(b) && b != Any
    ensures var u := Node(map[Any := Leaf<H>(name, None, v1, h1)], None, "", None);
      Insert(Node(map[a := u], None, "", None), [a, b], cache, v2, h2, engine)
      == Success((Node(map[a := u.(children := u.children[b := Leaf("", None, v2, h2)])], None, "", None), cache))
  {
    var u := Node(map[Any := Leaf<H>(name, None, v1, h1)], None, "", None);
    var u' := u.(children := u.children[b := Leaf("", None, v2, h2)]);
    var root := Node(map[a := u], None, "", None);
    InsertNewLiteral(u, b, cache, v2, h2, engine);
    assert [a, b][1..] == [b];
    assert root.children[a := u'] == map[a := u'];
  }

  /** Registering "/a/b" on top of "/a/:name". */
  lemma RegisterStatic<H>(a: string, b: string, name: string, cache: Cache, v1: string, h1: H, v2: string, h2: H, engine: Engine)
    requires Plain(a) && Plain(b) && b != Any
    ensures var u := Node(map[Any := Leaf<H>(name, None, v1, h1)], None, "", None);
      RouteSpec(Node(map[a := u], None, "", None), cache, "/" + a + "/" + b, Some(h2), v2, engine)
      == Success((Node(map[a := u.(children := u.children[b := Leaf("", None, v2, h2)])], None, "", None), cache))
  {
    var u := Node(map[Any := Leaf<H>(name, None, v1, h1)], None, "", None);
    RouteTwo(Node(map[a := u], None, "", None), cache, a, b, v2, h2, engine);
    InsertStatic(a, b, name, cache, v1, h1, v2, h2, engine);
  }

  /** A literal last part that is not there yet becomes a new child holding the handler. */
  lemma InsertNewLiteral<H>(n: Node<H>, b: string, cache: Cache, verb: string, h: H, engine: Engine)
    requires Plain(b) && b !in n.children
    ensures Insert(n, [b], cache, verb, h, engine) == Success((n.(children := n.children[b := Leaf("", None, verb, h)]), cache))
  {
    assert Insert(NewNode<H>(), [], cache, verb, h, engine) == Success((Leaf("", None, verb, h), cache));
  }

  /** The segments of "/a/b" are a and b. */
  lemma LookupTwo<H>(root: Node<H>, prefix: string, a: string, b: string, engine: Engine)
    requires a != "" && b != "" && '/' !in a && '/' !in b
    ensures Lookup(root, prefix, prefix + "/" + a + "/" + b, engine) == Answer(Walk(root, [a, b], None, engine))
  {
    var parts := [a, b];
    assert Join(parts, '/') == a + "/" + b by {
      assert parts[1..] == [b];
    }
    SegmentsOfJoin(parts);
    assert prefix + "/" + a + "/" + b == prefix + ("/" + (a + "/" + b));
    LookupAfterPrefix(root, prefix, "/" + (a + "/" + b), engine);
    ResolveDropsOneSlash(root, a + "/" + b, engine);
  }

  /**
   * Register "/a/:name", then "/a/b" (router_test.go's /users/:user and
   * /users/topusers): "/a/b" finds the static route and captures nothing;
   * any other segment v falls to the parameter and captures name = v.
   */
  lemma StaticBeatsParameter<H>(a: string, b: string, v: string, name: string, v1: string, h1: H, v2: string, h2: H,
                                engine: Engine, prefix: string)
    requires Plain(a) && Plain(b) && b != Any && PlainName(name)
    requires v != "" && '/' !in v && v != b && v != Any
    ensures var r1 := RouteSpec(NewNode<H>(), map[], "/" + a + "/:" + name, Some(h1), v1, engine);
      && r1.Success?
      && var r2 := RouteSpec(r1.value.0, r1.value.1, "/" + a + "/" + b, Some(h2), v2, engine);
      && r2.Success?
      && Lookup(r2.value.0, prefix, prefix + "/" + a + "/" + b, engine) == (Some(map[v2 := h2]), None)
      && Lookup(r2.value.0, prefix, prefix + "/" + a + "/" + v, engine) == (Some(map[v1 := h1]), Some(map[name := v]))
  {
    RegisterParam(a, name, v1, h1, engine);
    RegisterStatic(a, b, name, map[], v1, h1, v2, h2, engine);
    var u := Node(map[Any := Leaf<H>(name, None, v1, h1)], None, "", None);
    var u' := u.(children := u.children[b := Leaf("", None, v2, h2)]);
    LookupsBesideParam(u', a, b, v, name, v1, h1, v2, h2, engine, prefix);
  }

  /** The two lookups of StaticBeatsParameter, on the trie the two registrations build. */
  lemma LookupsBesideParam<H>(u: Node<H>, a: string, b: string, v: string, name: string, v1: string, h1: H, v2: string, h2: H,
                              engine: Engine, prefix: string)
    requires u == Node(map[Any := Leaf<H>(name, None, v1, h1), b := Leaf("", None, v2, h2)], None, "", None)
    requires a != "" && '/' !in a && b != "" && '/' !in b && b != Any
    requires v != "" && '/' !in v && v != b && v != Any
    ensures Lookup(Node(map[a := u], None, "", None), prefix, prefix + "/" + a + "/" + b, engine) == (Some(map[v2 := h2]), None)
    ensures Lookup(Node(map[a := u], None, "", None), prefix, prefix + "/" + a + "/" + v, engine) == (Some(map[v1 := h1]), Some(map[name := v]))
  {
    var root := Node(map[a := u], None, "", None);
    LookupTwo(root, prefix, a, b, engine);
    LookupTwo(root, prefix, a, v, engine);
    WalkToStatic(root, u, a, b, Leaf("", None, v2, h2), engine);
    WalkToParam(root, u, a, v, name, v1, h1, engine);
  }

  lemma WalkToStatic<H>(root: Node<H>, u: Node<H>, a: string, b: string, leaf: Node<H>, engine: Engine)
    requires root.children == map[a := u] && b in u.children && u.children[b] == leaf
    ensures Walk(root, [a, b], None, engine) == Reached(leaf, None)
  {
    assert [a, b][1..] == [b] && [b][1..] == [];
    assert LiteralPath(u, [b]);
    assert LiteralPath(root, [a, b]);
    assert Descend(u, [b]) == Descend(leaf, []) == leaf;
    assert Descend(root, [a, b]) == Descend(u, [b]);
    LiteralWalk(root, [a, b], None, engine);
  }

  lemma WalkToParam<H>(root: Node<H>, u: Node<H>, a: string, v: string, name: string, verb: string, h: H, engine: Engine)
    requires root.children == map[a := u] && v !in u.children && Any in u.children && u.children[Any] == Leaf(name, None, verb, h)
    ensures Walk(root, [a, v], None, engine) == Reached(Leaf(name, None, verb, h), Some(map[name := v]))
  {
    assert [a, v][1..] == [v];
    assert Walk(root, [a, v], None, engine) == Walk(u, [v], None, engine);
    ParamLeaf(u, v, name, verb, h, engine);
  }

  /** A segment with no literal child reaches a parameter leaf and captures the segment. */
  lemma ParamLeaf<H>(u: Node<H>, v: string, name: string, verb: string, h: H, engine: Engine)
    requires v !in u.children && Any in u.children && u.children[Any] == Leaf(name, None, verb, h)
    ensures Walk(u, [v], None, engine) == Reached(Leaf(name, None, verb, h), Some(map[name := v]))
  {
    ParameterStep(u, v, [], None, engine);
    assert [v] + [] == [v];
  }

  /**
   * Register "/a/:x", then "/a/:y" with y != x (router_test.go's
   * /authorizations/:id against a second name at the same position): a
   * parameter conflict.
   */
  lemma ParamNameConflict<H>(a: string, x: string, y: string, v1: string, h1: H, v2: string, h2: H, engine: Engine)
    requires Plain(a) && PlainName(x) && PlainName(y) && y != x
    ensures var r1 := RouteSpec(NewNode<H>(), map[], "/" + a + "/:" + x, Some(h1), v1, engine);
      && r1.Success?
      && RouteSpec(r1.value.0, r1.value.1, "/" + a + "/:" + y, Some(h2), v2, engine) == Failure(ParamConflict(y))
  {
    RegisterParam(a, x, v1, h1, engine);
    var u := Node(map[Any := Leaf<H>(x, None, v1, h1)], None, "", None);
    var root := Node(map[a := u], None, "", None);
    RouteParamAt(root, a, y, v2, h2, engine);
    InsertConflict(root, u, a, x, y, v2, h2, engine);
  }

  /** Registering "/a/:x" again, under the same name, succeeds exactly for a method not there yet. */
  lemma SameParamOtherMethod<H>(a: string, x: string, v1: string, h1: H, v2: string, h2: H, engine: Engine)
    requires Plain(a) && PlainName(x)
    ensures var r1 := RouteSpec(NewNode<H>(), map[], "/" + a + "/:" + x, Some(h1), v1, engine);
      && r1.Success?
      && (RouteSpec(r1.value.0, r1.value.1, "/" + a + "/:" + x, Some(h2), v2, engine).Success? <==> v2 != v1)
  {
    RegisterParam(a, x, v1, h1, engine);
    var u := Node(map[Any := Leaf<H>(x, None, v1, h1)], None, "", None);
    var root := Node(map[a := u], None, "", None);
    RouteParamAt(root, a, x, v2, h2, engine);
    InsertSameParam(root, u, a, x, v1, h1, v2, h2, engine);
  }

  /** route of "/a/:name" inserts [a, :name]. */
  lemma RouteParamAt<H>(root: Node<H>, a: string, name: string, verb: string, h: H, engine: Engine)
    requires a != "" && '/' !in a && '/' !in name
    ensures RouteSpec(root, map[], "/" + a + "/:" + name, Some(h), verb, engine) == Insert(root, [a, ":" + name], map[], verb, h, engine)
  {
    ParamPath(a, name);
    RouteTwo(root, map[], a, ":" + name, verb, h, engine);
    ParamPathConcat(a, name);
  }

  /** "/a/:name" is "/a/" followed by the part ":name". */
  lemma ParamPathConcat(a: string, name: string)
    ensures "/" + a + "/:" + name == "/" + a + "/" + (":" + name)
  {
    assert "/:" == "/" + ":";
    AppendAssoc("/" + a, "/:", name);
    AppendAssoc("/", ":", name);
    AppendAssoc("/" + a, "/", ":" + name);
  }

  /** ":" + name is a segment without slashes. */
  lemma ParamPath(a: string, name: string)
    requires '/' !in name
    ensures ":" + name != "" && '/' !in ":" + name
  {
    ParamPartNoSlash(name, "");
    assert ":" + name + "" == ":" + name;
  }

  lemma InsertConflict<H>(root: Node<H>, u: Node<H>, a: string, x: string, y: string, v2: string, h2: H, engine: Engine)
    requires Plain(a) && PlainName(y) && y != x
    requires root.children == map[a := u] && Any in u.children && u.children[Any].paramName == x
    ensures Insert(root, [a, ":" + y], map[], v2, h2, engine) == Failure(ParamConflict(y))
  {
    SeparatePlain(y, map[], engine);
    assert Insert(u, [":" + y], map[], v2, h2, engine) == Failure(ParamConflict(y));
    assert [a, ":" + y][1..] == [":" + y];
  }

  lemma InsertSameParam<H>(root: Node<H>, u: Node<H>, a: string, x: string, v1: string, h1: H, v2: string, h2: H, engine: Engine)
    requires Plain(a) && PlainName(x)
    requires root.children == map[a := u] && u.children == map[Any := Leaf<H>(x, None, v1, h1)]
    ensures Insert(root, [a, ":" + x], map[], v2, h2, engine).Success? <==> v2 != v1
  {
    var p := ":" + x;
    ParamAgain(u, x, v1, h1, v2, h2, engine);
    InsertPlainStep(root, a, [p], map[], v2, h2, engine);
    assert [a] + [p] == [a, p];
  }

  /** Inserting `:x` again where the parameter leaf for x holds only v1: success exactly for another method. */
  lemma ParamAgain<H>(u: Node<H>, x: string, v1: string, h1: H, v2: string, h2: H, engine: Engine)
    requires PlainName(x) && u.children == map[Any := Leaf<H>(x, None, v1, h1)]
    ensures Insert(u, [":" + x], map[], v2, h2, engine).Success? <==> v2 != v1
  {
    var p := ":" + x;
    SeparatePlain(x, map[], engine);
    InsertParamStep(u, p, [], map[], Parsed(x, None), map[], v2, h2, engine);
    assert [p] + [] == [p];
    assert Insert(Leaf<H>(x, None, v1, h1), [], map[], v2, h2, engine).Success? <==> v2 != v1;
  }

  /**
   * Register "/a/:name!pat" (router_test.go's /regex/integer/:n!\d+): the
   * rewritten pattern is compiled once and cached under the raw text, and
   * a segment reaches the handler, captured under the name, exactly when
   * the compiled constraint matches it.
   */
  lemma ConstraintFilters<H>(a: string, name: string, pat: string, v: string, verb: string, h: H, engine: Engine, prefix: string)
    requires Plain(a) && PlainName(name) && pat != "" && '/' !in pat && engine.compiles(Rewrite(pat).value)
    requires v != "" && '/' !in v && v != Any
    ensures var re := Pat(Rewrite(pat).value);
      var r := RouteSpec(NewNode<H>(), map[], "/" + a + "/:" + name + "!" + pat, Some(h), verb, engine);
      && r.Success?
      && r.value.1 == map[pat := re]
      && Lookup(r.value.0, prefix, prefix + "/" + a + "/" + v, engine)
         == if engine.matches(re, v) then (Some(map[verb := h]), Some(map[name := v])) else (None, None)
  {
    var re := Pat(Rewrite(pat).value);
    var part := ":" + name + "!" + pat;
    var u := Node(map[Any := Leaf<H>(name, Some(re), verb, h)], None, "", None);
    var root := Node(map[a := u], None, "", None);
    assert '/' !in "!" + pat by {
      assert forall k :: 0 < k < |"!" + pat| ==> ("!" + pat)[k] == pat[k - 1];
    }
    ParamPartNoSlash(name, "!" + pat);
    assert part == ":" + name + ("!" + pat);
    assert "/" + a + "/:" + name + "!" + pat == "/" + a + "/" + part;
    RouteTwo(NewNode<H>(), map[], a, part, verb, h, engine);
    InsertConstrained(a, name, pat, verb, h, engine);
    LookupTwo(root, prefix, a, v, engine);
    ConstrainedLeaf(root, u, a, v, name, re, verb, h, engine);
  }

  lemma InsertConstrained<H>(a: string, name: string, pat: string, verb: string, h: H, engine: Engine)
    requires Plain(a) && PlainName(name) && pat != "" && engine.compiles(Rewrite(pat).value)
    ensures var re := Pat(Rewrite(pat).value);
      Insert(NewNode<H>(), [a, ":" + name + "!" + pat], map[], verb, h, engine)
      == Success((Node(map[a := Node(map[Any := Leaf(name, Some(re), verb, h)], None, "", None)], None, "", None), map[pat := re]))
  {
    var re := Pat(Rewrite(pat).value);
    var part := ":" + name + "!" + pat;
    InsertConstrainedLeaf(name, pat, verb, h, engine);
    InsertPlainStep(NewNode<H>(), a, [part], map[], verb, h, engine);
    assert [a] + [part] == [a, part];
  }

  /** Inserting the single part `:name!pat` into an empty trie compiles the pattern once and caches it. */
  lemma InsertConstrainedLeaf<H>(name: string, pat: string, verb: string, h: H, engine: Engine)
    requires PlainName(name) && pat != "" && engine.compiles(Rewrite(pat).value)
    ensures var re := Pat(Rewrite(pat).value);
      Insert(NewNode<H>(), [":" + name + "!" + pat], map[], verb, h, engine)
      == Success((Node(map[Any := Leaf(name, Some(re), verb, h)], None, "", None), map[pat := re]))
  {
    var re := Pat(Rewrite(pat).value);
    var part := ":" + name + "!" + pat;
    SeparateConstrained(name, pat, map[], engine);
    assert Cached(pat, map[], engine) == Success((re, map[pat := re]));
    assert HasPrefix(part, ":") by {
      assert part[0] == ':';
    }
    InsertParamStep(NewNode<H>(), part, [], map[], Parsed(name, Some(re)), map[pat := re], verb, h, engine);
    assert [part] + [] == [part];
    assert Insert(Fresh<H>(true, Parsed(name, Some(re))), [], map[pat := re], verb, h, engine)
        == Success((Leaf(name, Some(re), verb, h), map[pat := re]));
  }

  lemma ConstrainedLeaf<H>(root: Node<H>, u: Node<H>, a: string, v: string, name: string, re: Pat, verb: string, h: H, engine: Engine)
    requires root.children == map[a := u] && u.children == map[Any := Leaf(name, Some(re), verb, h)] && v != Any
    ensures Answer(Walk(root, [a, v], None, engine))
         == if engine.matches(re, v) then (Some(map[verb := h]), Some(map[name := v])) else (None, None)
  {
    assert [a, v][1..] == [v];
    assert Walk(root, [a, v], None, engine) == Walk(u, [v], None, engine);
    ParameterStep(u, v, [], None, engine);
    assert [v] + [] == [v];
  }

  /**
   * Register "/a/?": the literal part "?" is stored under the parameter
   * key, as a parameter child with an empty name, so every other segment
   * after a reaches that handler and is captured under "".
   */
  lemma SentinelCollision<H>(a: string, v: string, verb: string, h: H, engine: Engine, prefix: string)
    requires Plain(a) && v != "" && '/' !in v && v != Any
    ensures var r := RouteSpec(NewNode<H>(), map[], "/" + a + "/" + Any, Some(h), verb, engine);
      && r.Success?
      && Lookup(r.value.0, prefix, prefix + "/" + a + "/" + v, engine) == (Some(map[verb := h]), Some(map["" := v]))
  {
    var leaf := Leaf<H>("", None, verb, h);
    var u := Node(map[Any := leaf], None, "", None);
    var root := Node(map[a := u], None, "", None);
    RouteTwo(NewNode<H>(), map[], a, Any, verb, h, engine);
    InsertSentinel(a, verb, h, engine);
    LookupTwo(root, prefix, a, v, engine);
    WalkToParam(root, u, a, v, "", verb, h, engine);
  }

  lemma InsertSentinel<H>(a: string, verb: string, h: H, engine: Engine)
    requires Plain(a)
    ensures Insert(NewNode<H>(), [a, Any], map[], verb, h, engine)
         == Success((Node(map[a := Node(map[Any := Leaf<H>("", None, verb, h)], None, "", None)], None, "", None), map[]))
  {
    assert !HasPrefix(Any, ":");
    InsertNewLiteral(NewNode<H>(), Any, map[], verb, h, engine);
    assert NewNode<H>().children[Any := Leaf<H>("", None, verb, h)] == map[Any := Leaf<H>("", None, verb, h)];
    assert [a, Any][1..] == [Any];
  }
}
