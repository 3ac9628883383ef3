/**
 * The segment trie of router.go: nodes, the `add` and `validParam` helpers
 * of registration, and the pure walk that lookup performs over a list of
 * path segments.
 */
module Trie {
  import opened Wrappers
  import opened Errors
  import opened Patterns

  /** The key under which a node keeps its parameter child (and the any-method key of a handler map). */
  const Any: string := "?"

  /**
   * trieNode. `handlers` is None where the original's map is still nil;
   * `paramName` and `paramRe` are set only on a child stored under Any.
   */
  datatype Node<H> = Node(
    children: map<string, Node<H>>,
    handlers: Option<map<string, H>>,
    paramName: string,
    paramRe: Option<Pat>)

  /** newNode: no children, nil handlers, no parameter. */
  function NewNode<H>(): (r: Node<H>)
    ensures r.children == map[] && r.handlers.None?
    ensures r.paramName == "" && r.paramRe.None?
  {
    Node(map[], None, "", None)
  }

  /** The handler map of a node, nil read as empty. */
  function HandlerMap<H>(n: Node<H>): map<string, H>
  {
    if n.handlers.Some? then n.handlers.value else map[]
  }

  /**
   * validParam: a parameter called `name` may sit below `n` unless `n`
   * already has a parameter child with another name. (The original's
   * first test, for a node without children, is subsumed by the second.)
   */
  function ValidParam<H>(name: string, n: Node<H>): (ok: bool)
    ensures ok <==> (Any in n.children ==> n.children[Any].paramName == name)
  {
    if |n.children| == 0 then true
    else if Any !in n.children then true
    else name == n.children[Any].paramName
  }

  /**
   * add: attach a handler for `verb`; a method that is already there is
   * fatal, and otherwise only that one entry of the node changes.
   */
  function Add<H>(n: Node<H>, verb: string, h: H): (r: Result<Node<H>, RouteError>)
    ensures r.Failure? <==> verb in HandlerMap(n)
    ensures r.Failure? ==> r.error == DuplicateMethod(verb)
    ensures r.Success? ==>
      && r.value.children == n.children
      && r.value.paramName == n.paramName && r.value.paramRe == n.paramRe
      && r.value.handlers == Some(HandlerMap(n)[verb := h])
  {
    var hs := if n.handlers.None? then map[] else n.handlers.value;
    if verb in hs then Failure(DuplicateMethod(verb))
    else Success(n.(handlers := Some(hs[verb := h])))
  }

  /** Where a walk over segments ends: a node and the variables captured on the way, or nowhere. */
  datatype Outcome<H> = NoRoute | Reached(node: Node<H>, vars: Option<map<string, string>>)

  /** `vars[name] = value`, allocating the map when it is still nil. */
  function Bind(vars: Option<map<string, string>>, name: string, value: string): (r: map<string, string>)
    ensures name in r && r[name] == value
    ensures forall k :: k in r && k != name ==> vars.Some? && k in vars.value && r[k] == vars.value[k]
    ensures vars.Some? ==> forall k :: k in vars.value ==> k in r
  {
    if vars.None? then map[name := value] else vars.value[name := value]
  }

  /**
   * The lookup walk: each segment goes to the literal child with that key if
   * there is one, else to the parameter child if there is one and its
   * constraint (if any) matches the segment, capturing the segment under
   * the child's parameter name. There is no backtracking.
   */
  function Walk<H>(n: Node<H>, segs: seq<string>, vars: Option<map<string, string>>, engine: Engine): (o: Outcome<H>)
    ensures segs == [] ==> o == Reached(n, vars)
    ensures o.Reached? && vars.Some? ==> o.vars.Some? && vars.value.Keys <= o.vars.value.Keys
    decreases |segs|
  {
    if segs == [] then Reached(n, vars)
    else
      var key := segs[0];
      if key in n.children then Walk(n.children[key], segs[1..], vars, engine)
      else if Any !in n.children then NoRoute
      else
        var next := n.children[Any];
        if next.paramRe.Some? && !engine.matches(next.paramRe.value, key) then NoRoute
        else Walk(next, segs[1..], Some(Bind(vars, next.paramName, key)), engine)
  }

  /** Every segment has a literal child to go to. */
  ghost predicate LiteralPath<H>(n: Node<H>, segs: seq<string>)
    decreases |segs|
  {
    segs == [] || (segs[0] in n.children && LiteralPath(n.children[segs[0]], segs[1..]))
  }

  /** The node a literal path leads to. */
  ghost function Descend<H>(n: Node<H>, segs: seq<string>): Node<H>
    requires LiteralPath(n, segs)
    decreases |segs|
  {
    if segs == [] then n else Descend(n.children[segs[0]], segs[1..])
  }

  /**
   * The shape registration maintains: only the child under Any carries a
   * parameter, its name is non-empty and its constraint anchored; a
   * non-nil handler map is never empty.
   */
  ghost predicate ChildFits<H>(key: string, child: Node<H>)
  {
    if key == Any then
      child.paramName != "" && (child.paramRe.Some? ==> Anchored(child.paramRe.value.source))
    else
      child.paramName == "" && child.paramRe.None?
  }

  ghost predicate WellFormed<H>(n: Node<H>)
  {
    && (n.handlers.Some? ==> n.handlers.value != map[])
    && forall k :: k in n.children ==> ChildFits(k, n.children[k]) && WellFormed(n.children[k])
  }

  /**
   * `b` is `a` after registrations: every child of `a` is still there and
   * extended, parameter name and constraint are kept, handlers only added.
   */
  ghost predicate Extends<H>(a: Node<H>, b: Node<H>)
  {
    && a.paramName == b.paramName && a.paramRe == b.paramRe
    && (a.handlers.Some? ==> b.handlers.Some?)
    && (forall m :: m in HandlerMap(a) ==> m in HandlerMap(b) && HandlerMap(b)[m] == HandlerMap(a)[m])
    && forall k :: k in a.children ==> k in b.children && Extends(a.children[k], b.children[k])
  }

  lemma {:induction false} ExtendsReflexive<H>(n: Node<H>)
    ensures Extends(n, n)
  {
    forall k | k in n.children ensures Extends(n.children[k], n.children[k]) {
      ExtendsReflexive(n.children[k]);
    }
  }

  lemma {:induction false} ExtendsTransitive<H>(a: Node<H>, b: Node<H>, c: Node<H>)
    requires Extends(a, b) && Extends(b, c)
    ensures Extends(a, c)
  {
    forall k | k in a.children ensures Extends(a.children[k], c.children[k]) {
      ExtendsTransitive(a.children[k], b.children[k], c.children[k]);
    }
  }

  /** add extends the node; two different methods both stay registered. */
  lemma AddExtends<H>(n: Node<H>, verb: string, h: H)
    requires Add(n, verb, h).Success?
    ensures Extends(n, Add(n, verb, h).value)
  {
    var r := Add(n, verb, h).value;
    forall k | k in n.children ensures Extends(n.children[k], r.children[k]) {
      ExtendsReflexive(n.children[k]);
    }
  }

  /** A literal child is always preferred: the walk goes there and captures nothing. */
  lemma {:induction false} LiteralWalk<H>(n: Node<H>, segs: seq<string>, vars: Option<map<string, string>>, engine: Engine)
    requires LiteralPath(n, segs)
    ensures Walk(n, segs, vars, engine) == Reached(Descend(n, segs), vars)
    decreases |segs|
  {
    if segs != [] {
      LiteralWalk(n.children[segs[0]], segs[1..], vars, engine);
    }
  }

  /** Once a variable is captured the walk never drops the variable map again. */
  lemma {:induction false} CapturedStaysCaptured<H>(n: Node<H>, segs: seq<string>, vars: map<string, string>, engine: Engine)
    ensures Walk(n, segs, Some(vars), engine).Reached? ==> Walk(n, segs, Some(vars), engine).vars.Some?
    decreases |segs|
  {
    if segs != [] {
      var key := segs[0];
      if key in n.children {
        CapturedStaysCaptured(n.children[key], segs[1..], vars, engine);
      } else if Any in n.children {
        var next := n.children[Any];
        CapturedStaysCaptured(next, segs[1..], Bind(Some(vars), next.paramName, key), engine);
      }
    }
  }

  /**
   * The variable map stays nil exactly when the walk takes no parameter
   * child: a walk that starts with nil variables ends with nil variables
   * if and only if every segment was matched literally.
   */
  lemma {:induction false} NilVarsIffLiteral<H>(n: Node<H>, segs: seq<string>, engine: Engine, m: Node<H>)
    ensures Walk(n, segs, None, engine) == Reached(m, None) <==> LiteralPath(n, segs) && m == Descend(n, segs)
    decreases |segs|
  {
    if LiteralPath(n, segs) {
      LiteralWalk(n, segs, None, engine);
    } else if segs != [] {
      var key := segs[0];
      if key in n.children {
        NilVarsIffLiteral(n.children[key], segs[1..], engine, m);
      } else if Any in n.children {
        var next := n.children[Any];
        CapturedStaysCaptured(next, segs[1..], Bind(None, next.paramName, key), engine);
      }
    }
  }

  /** Every captured value is one of the segments (or was already in the map). */
  lemma {:induction false} CapturesComeFromSegments<H>(n: Node<H>, segs: seq<string>, vars: Option<map<string, string>>, engine: Engine)
    requires Walk(n, segs, vars, engine).Reached? && Walk(n, segs, vars, engine).vars.Some?
    ensures var w := Walk(n, segs, vars, engine).vars.value;
      forall k :: k in w ==> w[k] in segs || (vars.Some? && k in vars.value && w[k] == vars.value[k])
    decreases |segs|
  {
    if segs != [] {
      var key := segs[0];
      if key in n.children {
        CapturesComeFromSegments(n.children[key], segs[1..], vars, engine);
      } else {
        var next := n.children[Any];
        CapturesComeFromSegments(next, segs[1..], Some(Bind(vars, next.paramName, key)), engine);
      }
    }
  }

  /** In a well-formed trie every captured variable has a non-empty name. */
  lemma {:induction false} CapturedNamesNonEmpty<H>(n: Node<H>, segs: seq<string>, vars: Option<map<string, string>>, engine: Engine)
    requires WellFormed(n)
    requires vars.Some? ==> "" !in vars.value
    requires Walk(n, segs, vars, engine).Reached? && Walk(n, segs, vars, engine).vars.Some?
    ensures "" !in Walk(n, segs, vars, engine).vars.value
    decreases |segs|
  {
    if segs != [] {
      var key := segs[0];
      if key in n.children {
        CapturedNamesNonEmpty(n.children[key], segs[1..], vars, engine);
      } else {
        var next := n.children[Any];
        assert ChildFits(Any, next);
        CapturedNamesNonEmpty(next, segs[1..], Some(Bind(vars, next.paramName, key)), engine);
      }
    }
  }

  /**
   * No backtracking: when a segment has a literal child, a failure further
   * down is final, even where the parameter child would have accepted the
   * segment and led to a match.
   */
  lemma NoBacktracking<H>(n: Node<H>, key: string, rest: seq<string>, vars: Option<map<string, string>>, engine: Engine)
    requires key in n.children && Any in n.children
    requires Walk(n.children[key], rest, vars, engine) == NoRoute
    ensures Walk(n, [key] + rest, vars, engine) == NoRoute
  {
    assert ([key] + rest)[1..] == rest;
  }

  /**
   * A segment without a literal child: with no parameter child, or one
   * whose constraint rejects the segment, the walk fails; otherwise it
   * continues in the parameter child with the segment bound to its name.
   */
  lemma ParameterStep<H>(n: Node<H>, key: string, rest: seq<string>, vars: Option<map<string, string>>, engine: Engine)
    requires key !in n.children
    ensures Any !in n.children ==> Walk(n, [key] + rest, vars, engine) == NoRoute
    ensures Any in n.children && n.children[Any].paramRe.Some? && !engine.matches(n.children[Any].paramRe.value, key)
      ==> Walk(n, [key] + rest, vars, engine) == NoRoute
    ensures Any in n.children && (n.children[Any].paramRe.None? || engine.matches(n.children[Any].paramRe.value, key))
      ==> var next := n.children[Any];
          Walk(n, [key] + rest, vars, engine) == Walk(next, rest, Some(Bind(vars, next.paramName, key)), engine)
  {
    assert ([key] + rest)[0] == key && ([key] + rest)[1..] == rest;
  }

  /** Registrations that extend a trie keep every literal path and the handlers at its end. */
  lemma {:induction false} ExtendsKeepsLiteralPath<H>(a: Node<H>, b: Node<H>, segs: seq<string>)
    requires Extends(a, b) && LiteralPath(a, segs)
    ensures LiteralPath(b, segs) && Extends(Descend(a, segs), Descend(b, segs))
    decreases |segs|
  {
    if segs != [] {
      ExtendsKeepsLiteralPath(a.children[segs[0]], b.children[segs[0]], segs[1..]);
    }
  }
}
