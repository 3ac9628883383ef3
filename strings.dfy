/**
 * The few functions of Go's `strings` package that the router uses, on
 * strings as sequences of characters.
 */
module Strings {

  predicate HasPrefix(s: string, p: string)
  {
    |p| <= |s| && s[..|p|] == p
  }

  predicate HasSuffix(s: string, p: string)
  {
    |p| <= |s| && s[|s| - |p|..] == p
  }

  /** Concatenation regrouped; stated once so that proofs need not redo it in a large context. */
  lemma AppendAssoc(a: string, b: string, c: string)
    ensures a + b + c == a + (b + c)
  {
  }

  /** The position of the first `c` in `s` (strings.Index for a one-character separator). */
  function FirstIndex(s: string, c: char): (i: nat)
    requires c in s
    ensures i < |s| && s[i] == c
    ensures c !in s[..i]
  {
    if s[0] == c then 0
    else
      var j := FirstIndex(s[1..], c);
      assert s[..j + 1] == [s[0]] + s[1..][..j];
      j + 1
  }

  /** strings.Join for a one-character separator. */
  function Join(parts: seq<string>, sep: char): string
    requires |parts| >= 1
  {
    if |parts| == 1 then parts[0] else parts[0] + [sep] + Join(parts[1..], sep)
  }

  /**
   * strings.Split for a one-character separator: the pieces between the
   * separators, so n separators give n + 1 pieces, empty ones included.
   */
  function SplitOn(s: string, sep: char): (parts: seq<string>)
    ensures |parts| >= 1
    ensures forall k :: 0 <= k < |parts| ==> sep !in parts[k]
    decreases |s|
  {
    if sep !in s then [s]
    else
      var i := FirstIndex(s, sep);
      [s[..i]] + SplitOn(s[i + 1..], sep)
  }

  /** Joining the pieces back together gives the original string. */
  lemma {:induction false} JoinSplitOn(s: string, sep: char)
    ensures Join(SplitOn(s, sep), sep) == s
    decreases |s|
  {
    if sep in s {
      var i := FirstIndex(s, sep);
      var rest := SplitOn(s[i + 1..], sep);
      assert SplitOn(s, sep) == [s[..i]] + rest;
      JoinCons(s[..i], rest, sep);
      JoinSplitOn(s[i + 1..], sep);
      CutAt(s, i);
    }
  }

  /** Joining one more piece in front adds it and a separator. */
  lemma JoinCons(a: string, xs: seq<string>, sep: char)
    requires |xs| >= 1
    ensures Join([a] + xs, sep) == a + [sep] + Join(xs, sep)
  {
    assert ([a] + xs)[0] == a && ([a] + xs)[1..] == xs;
  }

  /** A string is what comes before position `i`, the character there, and what comes after. */
  lemma CutAt(s: string, i: nat)
    requires i < |s|
    ensures s == s[..i] + [s[i]] + s[i + 1..]
  {
  }

  /** The first piece ends at the first separator. */
  lemma SplitOnCons(a: string, b: string, sep: char)
    requires sep !in a
    ensures SplitOn(a + [sep] + b, sep) == [a] + SplitOn(b, sep)
  {
    var t := a + [sep] + b;
    assert t[|a|] == sep;
    assert t[..|a|] == a;
    var i := FirstIndex(t, sep);
    assert i == |a|;
    assert t[i + 1..] == b;
  }

  /** Splitting a join of separator-free pieces gives the pieces back. */
  lemma {:induction false} SplitOnJoin(parts: seq<string>, sep: char)
    requires |parts| >= 1
    requires forall k :: 0 <= k < |parts| ==> sep !in parts[k]
    ensures SplitOn(Join(parts, sep), sep) == parts
  {
    if |parts| > 1 {
      SplitOnJoin(parts[1..], sep);
      SplitOnCons(parts[0], Join(parts[1..], sep), sep);
      assert parts == [parts[0]] + parts[1..];
    }
  }

  /** Appending one separator to a string adds one empty piece at the end. */
  lemma {:induction false} SplitOnAppendSep(s: string, sep: char)
    ensures SplitOn(s + [sep], sep) == SplitOn(s, sep) + [""]
    decreases |s|
  {
    if sep in s {
      var j := FirstIndex(s, sep);
      var a, b := s[..j], s[j + 1..];
      assert s == a + [sep] + b;
      assert s + [sep] == a + [sep] + (b + [sep]);
      SplitOnCons(a, b, sep);
      SplitOnCons(a, b + [sep], sep);
      SplitOnAppendSep(b, sep);
    } else {
      SplitOnCons(s, [], sep);
      assert s + [sep] == s + [sep] + [];
    }
  }

  /** A leading separator adds one empty piece at the front. */
  lemma SplitOnPrependSep(s: string, sep: char)
    ensures SplitOn([sep] + s, sep) == [""] + SplitOn(s, sep)
  {
    SplitOnCons([], s, sep);
    assert [sep] + s == [] + [sep] + s;
  }

  /** What strings.TrimLeft(s, cutset) leaves when every character that `drop` holds of is in the cutset. */
  function TrimLeftBy(s: string, drop: char -> bool): (r: string)
    ensures |r| <= |s| && r == s[|s| - |r|..]
    ensures forall k :: 0 <= k < |s| - |r| ==> drop(s[k])
    ensures r != [] ==> !drop(r[0])
    ensures forall c :: c in r ==> c in s
  {
    if s != [] && drop(s[0]) then TrimLeftBy(s[1..], drop) else s
  }

  /** The mirror image of TrimLeftBy. */
  function TrimRightBy(s: string, drop: char -> bool): (r: string)
    ensures |r| <= |s| && r == s[..|r|]
    ensures forall k :: |r| <= k < |s| ==> drop(s[k])
    ensures r != [] ==> !drop(r[|r| - 1])
    ensures forall c :: c in r ==> c in s
  {
    if s != [] && drop(s[|s| - 1]) then TrimRightBy(s[..|s| - 1], drop) else s
  }

  /** strings.Trim(s, string(c)): every leading and trailing `c` removed. */
  function Trim(s: string, c: char): (r: string)
    ensures |r| <= |s|
    ensures r != [] ==> r[0] != c && r[|r| - 1] != c
    ensures s != [] && s[0] != c && s[|s| - 1] != c ==> r == s
  {
    TrimRightBy(TrimLeftBy(s, x => x == c), x => x == c)
  }

  /** unicode.IsSpace: the white-space characters of Latin-1 and of Unicode's White_Space property. */
  predicate IsSpace(c: char)
  {
    || c == '\t' || c == '\n' || c == '\U{000B}' || c == '\U{000C}' || c == '\r' || c == ' '
    || c == '\U{0085}' || c == '\U{00A0}' || c == '\U{1680}'
    || ('\U{2000}' <= c <= '\U{200A}')
    || c == '\U{2028}' || c == '\U{2029}' || c == '\U{202F}' || c == '\U{205F}' || c == '\U{3000}'
  }

  /** `r` sits at offset `i` of `s`, and every character of `s` before and after it satisfies `drop`. */
  predicate Around(s: string, r: string, i: nat, drop: char -> bool)
  {
    && i + |r| <= |s| && s[i..i + |r|] == r
    && (forall k :: 0 <= k < i ==> drop(s[k]))
    && (forall k :: i + |r| <= k < |s| ==> drop(s[k]))
  }

  /** strings.TrimSpace: the slice left once white space is cut from both ends. */
  function TrimSpace(s: string): (r: string)
    ensures |r| <= |s|
    ensures r != [] ==> !IsSpace(r[0]) && !IsSpace(r[|r| - 1])
    ensures exists i :: Around(s, r, i, IsSpace)
    ensures (forall k :: 0 <= k < |s| ==> !IsSpace(s[k])) ==> r == s
    ensures forall c :: c in r ==> c in s
  {
    TrimmedAround(s, IsSpace);
    TrimRightBy(TrimLeftBy(s, IsSpace), IsSpace)
  }

  /** Trimming from the left, then from the right, leaves a slice of the string with only dropped characters around it. */
  lemma TrimmedAround(s: string, drop: char -> bool)
    ensures Around(s, TrimRightBy(TrimLeftBy(s, drop), drop), |s| - |TrimLeftBy(s, drop)|, drop)
  {
    var l := TrimLeftBy(s, drop);
    var r := TrimRightBy(l, drop);
    assert l == s[|s| - |l|..] && forall k :: 0 <= k < |s| - |l| ==> drop(s[k]);
    assert r == l[..|r|] && forall k :: |r| <= k < |l| ==> drop(l[k]);
    AroundOfSuffixPrefix(s, l, r, drop);
  }

  /** A prefix `r` of a suffix `l` of `s`, with only dropped characters cut off at either step, sits in `s` with dropped characters around it. */
  lemma AroundOfSuffixPrefix(s: string, l: string, r: string, drop: char -> bool)
    requires |l| <= |s| && l == s[|s| - |l|..]
    requires forall k :: 0 <= k < |s| - |l| ==> drop(s[k])
    requires |r| <= |l| && r == l[..|r|]
    requires forall k :: |r| <= k < |l| ==> drop(l[k])
    ensures Around(s, r, |s| - |l|, drop)
  {
    var i := |s| - |l|;
    assert s[i..i + |r|] == r;
    forall k | i + |r| <= k < |s|
      ensures drop(s[k])
    {
      assert s[k] == l[k - i];
    }
  }
}
