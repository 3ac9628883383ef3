/**
 * Constraint patterns of parameter segments (`:name!pattern`): the
 * rewriting done by compileRe before the pattern reaches Go's regexp
 * package. The regexp package itself is not modelled: an Engine says
 * which sources it accepts and which strings a compiled pattern matches.
 */
module Patterns {
  import opened Wrappers
  import opened Strings
  import opened Errors

  /** A compiled regular expression, identified by the source text it was compiled from. */
  datatype Pat = Pat(source: string)

  /** The regular-expression library, as two functions the model does not look inside. */
  datatype Engine = Engine(compiles: string -> bool, matches: (Pat, string) -> bool)

  /** The source substituted for the alias `int`. */
  const IntSource: string := @"^-?\d+$"

  /** The source substituted for the alias `float`. */
  const FloatSource: string := @"^-?\d+(?:\.\d+)?$"

  /** A source that can only match a whole segment: it starts with `^` and ends with `$`. */
  predicate Anchored(source: string)
  {
    HasPrefix(source, "^") && HasSuffix(source, "$")
  }

  /**
   * compileRe's rewriting: "" is fatal, the aliases become fixed sources,
   * anything else gets the anchors it is missing and is otherwise kept.
   */
  function Rewrite(pattern: string): (r: Result<string, RouteError>)
    ensures r.Failure? <==> pattern == ""
    ensures r.Failure? ==> r.error == EmptyPattern
    ensures r.Success? ==> Anchored(r.value)
    ensures pattern == "int" ==> r == Success(IntSource)
    ensures pattern == "float" ==> r == Success(FloatSource)
    ensures pattern != "int" && pattern != "float" && Anchored(pattern) ==> r == Success(pattern)
    ensures pattern != "" && pattern != "int" && pattern != "float" ==>
      var front := if HasPrefix(pattern, "^") then 0 else 1;
      var back := if HasSuffix(pattern, "$") then 0 else 1;
      && |r.value| == front + |pattern| + back
      && r.value[front..front + |pattern|] == pattern
  {
    if pattern == "" then Failure(EmptyPattern)
    else if pattern == "int" then Success(IntSource)
    else if pattern == "float" then Success(FloatSource)
    else Success(AddAnchors(pattern))
  }

  /**
   * The anchors compileRe adds to any other pattern: a `^` in front unless
   * it already starts with one, a `$` behind unless it already ends with one.
   */
  function AddAnchors(pattern: string): (r: string)
    requires pattern != ""
    ensures Anchored(r)
    ensures Anchored(pattern) ==> r == pattern
    ensures var front := if HasPrefix(pattern, "^") then 0 else 1;
      var back := if HasSuffix(pattern, "$") then 0 else 1;
      && |r| == front + |pattern| + back
      && r[front..front + |pattern|] == pattern
  {
    var head := if HasPrefix(pattern, "^") then pattern else "^" + pattern;
    assert HasPrefix(head, "^") && head[|head| - |pattern|..] == pattern;
    var full := if HasSuffix(head, "$") then head else head + "$";
    assert full[..|head|] == head;
    assert HasPrefix(full, "^");
    full
  }

  /** Rewriting a rewritten pattern changes nothing: the output is anchored and no alias. */
  lemma RewriteIdempotent(pattern: string)
    requires pattern != ""
    ensures Rewrite(Rewrite(pattern).value) == Rewrite(pattern)
  {
    var r := Rewrite(pattern).value;
    assert r != "int" && r != "float" by {
      assert r[0] == '^';
    }
  }

  /** compileRe: rewrite, then compile; a source the library refuses is fatal. */
  function Compile(pattern: string, engine: Engine): (r: Result<Pat, RouteError>)
    ensures r.Success? <==> Rewrite(pattern).Success? && engine.compiles(Rewrite(pattern).value)
    ensures r.Success? ==> r.value == Pat(Rewrite(pattern).value) && Anchored(r.value.source)
    ensures pattern == "" ==> r == Failure(EmptyPattern)
    ensures pattern != "" && !engine.compiles(Rewrite(pattern).value) ==> r == Failure(BadPattern(Rewrite(pattern).value))
  {
    match Rewrite(pattern)
    case Failure(e) => Failure(e)
    case Success(source) =>
      if engine.compiles(source) then Success(Pat(source)) else Failure(BadPattern(source))
  }
}
