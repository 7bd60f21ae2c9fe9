/**
  The pieces of Go's `strings` package (and the `\s` class of its `regexp`
  package) that the crawler relies on, stated over `seq<char>`.
 */
module Strings {

  /** RE2's Perl class `\s`: tab, newline, form feed, carriage return, space. */
  predicate IsSpace(c: char) {
    c == '\t' || c == '\n' || c == '\U{C}' || c == '\r' || c == ' '
  }

  predicate SpaceFree(s: string) {
    forall i :: 0 <= i < |s| ==> !IsSpace(s[i])
  }

  /** ASCII case mapping; `strings.ToLower` also maps non-ASCII letters. */
  function LowerChar(c: char): char {
    if 'A' <= c <= 'Z' then (c as int + 32) as char else c
  }

  function ToLower(s: string): (r: string)
    ensures |r| == |s|
    ensures forall i :: 0 <= i < |s| ==> r[i] == LowerChar(s[i])
  {
    seq(|s|, i requires 0 <= i < |s| => LowerChar(s[i]))
  }

  lemma ToLowerIdempotent(s: string)
    ensures ToLower(ToLower(s)) == ToLower(s)
  {
  }

  predicate HasPrefix(s: string, p: string) {
    |p| <= |s| && s[..|p|] == p
  }

  predicate HasSuffix(s: string, p: string) {
    |p| <= |s| && s[|s| - |p|..] == p
  }

  function TrimPrefix(s: string, p: string): (r: string)
    ensures HasPrefix(s, p) ==> s == p + r
    ensures !HasPrefix(s, p) ==> r == s
  {
    if HasPrefix(s, p) then s[|p|..] else s
  }

  function TrimSuffix(s: string, p: string): (r: string)
    ensures HasSuffix(s, p) ==> s == r + p
    ensures !HasSuffix(s, p) ==> r == s
  {
    if HasSuffix(s, p) then s[..|s| - |p|] else s
  }

  /** `strings.Contains`: `sub` occurs at some position of `s`. */
  predicate Contains(s: string, sub: string) {
    exists i :: 0 <= i <= |s| && HasPrefix(s[i..], sub)
  }

  /** The characters of `s` that are not white space, in order. */
  function RemoveSpace(s: string): (r: string)
    ensures |r| <= |s|
  {
    if s == [] then []
    else (if IsSpace(s[0]) then [] else [s[0]]) + RemoveSpace(s[1..])
  }

  /** No white space is left. */
  lemma {:induction false} RemoveSpaceIsSpaceFree(s: string)
    ensures SpaceFree(RemoveSpace(s))
  {
    if s != [] {
      RemoveSpaceIsSpaceFree(s[1..]);
    }
  }

  lemma {:induction false} RemoveSpaceAppend(a: string, b: string)
    ensures RemoveSpace(a + b) == RemoveSpace(a) + RemoveSpace(b)
  {
    if a == [] {
      assert a + b == b;
    } else {
      assert (a + b)[1..] == a[1..] + b;
      RemoveSpaceAppend(a[1..], b);
    }
  }

  lemma {:induction false} RemoveSpaceOfSpaceFree(s: string)
    requires SpaceFree(s)
    ensures RemoveSpace(s) == s
  {
    if s != [] {
      RemoveSpaceOfSpaceFree(s[1..]);
    }
  }

  /** Removing white space twice removes nothing more. */
  lemma RemoveSpaceIdempotent(s: string)
    ensures RemoveSpace(RemoveSpace(s)) == RemoveSpace(s)
  {
    RemoveSpaceIsSpaceFree(s);
    RemoveSpaceOfSpaceFree(RemoveSpace(s));
  }

  /** A white-space-free prefix survives `RemoveSpace` unchanged. */
  lemma RemoveSpaceKeepsPrefix(s: string, p: string)
    requires HasPrefix(s, p) && SpaceFree(p)
    ensures HasPrefix(RemoveSpace(s), p)
  {
    assert s == p + s[|p|..];
    RemoveSpaceAppend(p, s[|p|..]);
    RemoveSpaceOfSpaceFree(p);
  }

  /** `strings.Split(s, string(sep))`: never empty, "" splits into [""]. */
  function Split(s: string, sep: char): (r: seq<string>)
    ensures |r| >= 1
  {
    if s == [] then [""]
    else
      var rest := Split(s[1..], sep);
      if s[0] == sep then [""] + rest
      else [[s[0]] + rest[0]] + rest[1..]
  }

  /** `strings.Join(parts, glue)`. */
  function Join(parts: seq<string>, glue: string): string {
    if |parts| == 0 then ""
    else if |parts| == 1 then parts[0]
    else parts[0] + glue + Join(parts[1..], glue)
  }

  /** Every occurrence of `c` in `s` replaced by `glue`. */
  function Replace(s: string, c: char, glue: string): string {
    if s == [] then []
    else (if s[0] == c then glue else [s[0]]) + Replace(s[1..], c, glue)
  }

  /** Splitting at `sep` and joining with `glue` replaces each `sep` by `glue`. */
  lemma {:induction false} JoinSplit(s: string, sep: char, glue: string)
    ensures Join(Split(s, sep), glue) == Replace(s, sep, glue)
  {
    if s != [] {
      var rest := Split(s[1..], sep);
      JoinSplit(s[1..], sep, glue);
      if s[0] != sep && |rest| > 1 {
        assert Join(rest, glue) == rest[0] + glue + Join(rest[1..], glue);
      }
    }
  }

  lemma {:induction false} JoinSnoc(parts: seq<string>, p: string, glue: string)
    ensures Join(parts + [p], glue) == if parts == [] then p else Join(parts, glue) + glue + p
  {
    if |parts| > 1 {
      assert (parts + [p])[1..] == parts[1..] + [p];
      JoinSnoc(parts[1..], p, glue);
    } else if |parts| == 1 {
      assert (parts + [p])[1..] == [p];
    }
  }

  lemma {:induction false} ReplaceFacts(s: string, c: char, g: string)
    requires c !in g
    ensures c !in Replace(s, c, g)
    ensures |Replace(s, c, g)| == |s| + (|g| - 1) * multiset(s)[c]
  {
    if s != [] {
      ReplaceFacts(s[1..], c, g);
      assert s == [s[0]] + s[1..];
      var k := multiset(s[1..])[c];
      var n := if s[0] == c then k + 1 else k;
      assert multiset(s)[c] == n;
      MulStep(|g| - 1, k);
    }
  }

  lemma MulStep(d: int, k: int)
    ensures d * (k + 1) == d * k + d
  {
  }
}
