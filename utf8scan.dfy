/**
 * get's scan as the original writes it. Go's range over a string yields
 * the BYTE offset of each character, and the loop closes the last segment
 * when that offset equals the byte length minus one. That only happens
 * when the last character is one byte long in UTF-8. When it is longer,
 * the last segment is never looked up and the walk stops one node short.
 * Matcher.Lookup and R2.Router.Get use the intended scan, ScanSegments.
 */
module Utf8Scan {
  import opened Wrappers
  import opened Strings
  import opened Patterns
  import opened Trie
  import opened Registrar
  import opened Matcher

  /** The number of bytes UTF-8 uses for a character. */
  function Width(c: char): (w: nat)
    ensures 1 <= w <= 4
    ensures w == 1 <==> (c as int) < 0x80
  {
    if (c as int) < 0x80 then 1
    else if (c as int) < 0x800 then 2
    else if (c as int) < 0x1_0000 then 3
    else 4
  }

  /** len(s) in Go: the length of the UTF-8 encoding. */
  function ByteLen(s: string): (n: nat)
    ensures n >= |s|
  {
    if s == [] then 0 else ByteLen(s[..|s| - 1]) + Width(s[|s| - 1])
  }

  lemma {:induction false} ByteLenAppend(a: string, b: string)
    ensures ByteLen(a + b) == ByteLen(a) + ByteLen(b)
    decreases |b|
  {
    if b == [] {
      assert a + b == a;
    } else {
      var b' := b[..|b| - 1];
      assert (a + b)[..|a + b| - 1] == a + b';
      assert (a + b)[|a + b| - 1] == b[|b| - 1];
      ByteLenAppend(a, b');
    }
  }

  /** The bytes of a string are those before character `pos`, its own, and those after. */
  lemma ByteLenAround(q: string, pos: nat)
    requires pos < |q|
    ensures ByteLen(q) == ByteLen(q[..pos]) + Width(q[pos]) + ByteLen(q[pos + 1..])
  {
    assert q[..pos + 1] + q[pos + 1..] == q;
    ByteLenAppend(q[..pos + 1], q[pos + 1..]);
    assert q[..pos + 1][..pos] == q[..pos];
  }

  /**
   * The byte offset of character `pos` is the byte length minus one exactly
   * at the last character, and only when that character is one byte long.
   */
  lemma ClosesAtEnd(q: string, pos: nat)
    requires pos < |q|
    ensures ByteLen(q[..pos]) == ByteLen(q) - 1 <==> pos == |q| - 1 && Width(q[pos]) == 1
  {
    ByteLenAround(q, pos);
    if pos == |q| - 1 {
      assert q[pos + 1..] == [];
    }
  }

  /** The scan of router.go as written: the end test compares a byte offset with the byte length. */
  function ScanAsWritten(q: string, start: nat, pos: nat): (r: seq<string>)
    requires start <= pos <= |q|
    ensures |r| <= |q| - pos
    decreases |q| - pos
  {
    if pos == |q| then []
    else if q[pos] == '/' || ByteLen(q[..pos]) == ByteLen(q) - 1 then
      var end := if q[pos] == '/' then pos else pos + 1;
      [q[start..end]] + ScanAsWritten(q, pos + 1, pos + 1)
    else ScanAsWritten(q, start, pos + 1)
  }

  /** When the path ends in a one-byte character the scan as written is the intended one. */
  lemma {:induction false} AsciiEndAgrees(q: string, start: nat, pos: nat)
    requires start <= pos <= |q|
    requires q != [] && Width(q[|q| - 1]) == 1
    ensures ScanAsWritten(q, start, pos) == ScanSegments(q, start, pos)
    decreases |q| - pos
  {
    if pos < |q| {
      ClosesAtEnd(q, pos);
      if q[pos] == '/' || pos == |q| - 1 {
        AsciiEndAgrees(q, pos + 1, pos + 1);
      } else {
        AsciiEndAgrees(q, start, pos + 1);
      }
    }
  }

  /** When the path ends in a longer character the scan as written loses exactly the last segment. */
  lemma {:induction false} WideEndDropsLast(q: string, start: nat, pos: nat)
    requires start <= pos < |q|
    requires Width(q[|q| - 1]) > 1
    ensures var all := ScanSegments(q, start, pos);
      |all| >= 1 && ScanAsWritten(q, start, pos) == all[..|all| - 1]
    decreases |q| - pos
  {
    ClosesAtEnd(q, pos);
    if pos == |q| - 1 {
      assert q[pos] != '/';
    } else if q[pos] == '/' {
      WideEndDropsLast(q, pos + 1, pos + 1);
    } else {
      WideEndDropsLast(q, start, pos + 1);
    }
  }

  /** get as written: Matcher.Lookup with the scan of router.go. */
  function LookupAsWritten<H>(root: Node<H>, prefix: string, path: string, engine: Engine)
    : (r: (Option<map<string, H>>, Option<map<string, string>>))
    ensures !HasPrefix(path, prefix) ==> r == (None, None)
    ensures path == prefix || path == prefix + "/" ==> r == (root.handlers, None)
  {
    if !HasPrefix(path, prefix) then (None, None)
    else
      var p := path[|prefix|..];
      if p == "" || p == "/" then (root.handlers, None)
      else
        var q := if p[0] == '/' then p[1..] else p;
        Answer(Walk(root, ScanAsWritten(q, 0, 0), None, engine))
  }

  /** For paths that end in a one-byte character the lookup as written is the corrected Lookup. */
  lemma LookupAgreesOnAscii<H>(root: Node<H>, prefix: string, path: string, engine: Engine)
    requires path != [] && Width(path[|path| - 1]) == 1
    ensures LookupAsWritten(root, prefix, path, engine) == Lookup(root, prefix, path, engine)
  {
    if HasPrefix(path, prefix) {
      var p := path[|prefix|..];
      if !(p == "" || p == "/") {
        var q := if p[0] == '/' then p[1..] else p;
        assert q[|q| - 1] == path[|path| - 1];
        AsciiEndAgrees(q, 0, 0);
        ScanIsSplit(q, 0, 0);
      }
    }
  }

  /**
   * A route registered as "/é" is never found by the lookup as written: it
   * answers Not Found, while the corrected Lookup finds the handler.
   */
  lemma RegisteredButNotFound<H>(h: H, engine: Engine)
    ensures var r := RouteSpec(NewNode<H>(), map[], "/é", Some(h), "GET", engine);
      && r.Success?
      && LookupAsWritten(r.value.0, "", "/é", engine) == (None, None)
      && Lookup(r.value.0, "", "/é", engine) == (Some(map["GET" := h]), None)
  {
    var leaf: Node<H> := Node(map[], Some(map["GET" := h]), "", None);
    var root := Node(map["é" := leaf], None, "", None);
    RegisterWide(h, engine);
    LookupWide(root, leaf, engine);
  }

  /** Registering "/é" on an empty trie adds one literal child holding the handler. */
  lemma RegisterWide<H>(h: H, engine: Engine)
    ensures RouteSpec(NewNode<H>(), map[], "/é", Some(h), "GET", engine)
         == Success((Node(map["é" := Node(map[], Some(map["GET" := h]), "", None)], None, "", None), map[]))
  {
    SplitOfJoin(["é"]);
    assert "/" + Join(["é"], '/') == "/é";
    var leaf: Node<H> := Node(map[], Some(map["GET" := h]), "", None);
    assert Insert(NewNode<H>(), ["é"], map[], "GET", h, engine) == Success((Node(map["é" := leaf], None, "", None), map[]));
  }

  /** The lookup of "/é" as written stops before the last segment; the corrected one reaches it. */
  lemma LookupWide<H>(root: Node<H>, leaf: Node<H>, engine: Engine)
    requires root.children == map["é" := leaf] && root.handlers.None?
    ensures LookupAsWritten(root, "", "/é", engine) == (None, None)
    ensures Lookup(root, "", "/é", engine) == (leaf.handlers, None)
  {
    assert ScanAsWritten("é", 0, 0) == [] by {
      ClosesAtEnd("é", 0);
    }
    assert "/é"[1..] == "é";
    SegmentsNoSlash("é");
  }
}
