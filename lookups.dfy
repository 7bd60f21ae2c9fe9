/**
  The small helpers of fetch.go: membership and counting over string
  slices, de-duplication of the seed list, the queue membership test by
  URL string, the file name of a saved page and the media filter.
 */
module Lookups {
  import opened Strings
  import opened Commands

  /** `check`: scans the whole slice, setting a flag on every match. */
  method Check(sl: seq<string>, s: string) returns (chk: bool)
    ensures chk <==> s in sl
  {
    chk := false;
    for i := 0 to |sl|
      invariant chk <==> s in sl[..i]
    {
      assert sl[..i + 1] == sl[..i] + [sl[i]];
      if sl[i] == s {
        chk := true;
      }
    }
    assert sl[..|sl|] == sl;
  }

  /** The position of the first occurrence of `s` in `sl`. */
  function FirstIndex(sl: seq<string>, s: string): (k: nat)
    requires s in sl
    ensures k < |sl| && sl[k] == s
    ensures forall i :: 0 <= i < k ==> sl[i] != s
  {
    if sl[0] == s then 0 else 1 + FirstIndex(sl[1..], s)
  }

  /** The first occurrence of each element, in order. */
  function Distinct(sl: seq<string>): seq<string> {
    if sl == [] then []
    else
      var d := Distinct(sl[..|sl| - 1]);
      if sl[|sl| - 1] in d then d else d + [sl[|sl| - 1]]
  }

  /** The first occurrence in a prefix is the first occurrence in the whole. */
  lemma FirstIndexPrefix(sl: seq<string>, n: nat, s: string)
    requires n <= |sl| && s in sl[..n]
    ensures s in sl && FirstIndex(sl, s) == FirstIndex(sl[..n], s)
  {
    var k := FirstIndex(sl[..n], s);
    assert sl[k] == sl[..n][k];
    assert forall i :: 0 <= i < k ==> sl[i] == sl[..n][i];
  }

  /**
    `Distinct(sl)` holds exactly the elements of `sl`, each once, ordered by
    their first occurrence.
   */
  lemma {:induction false} DistinctMeaning(sl: seq<string>)
    ensures forall s :: s in Distinct(sl) <==> s in sl
    ensures forall i, j :: 0 <= i < j < |Distinct(sl)| ==> Distinct(sl)[i] != Distinct(sl)[j]
    ensures forall i, j :: 0 <= i < j < |Distinct(sl)| ==> FirstIndex(sl, Distinct(sl)[i]) < FirstIndex(sl, Distinct(sl)[j])
  {
    if sl != [] {
      var n := |sl|;
      var p, x := sl[..n - 1], sl[n - 1];
      assert sl == p + [x];
      DistinctMeaning(p);
      var d' := Distinct(p);
      forall s | s in p ensures FirstIndex(sl, s) == FirstIndex(p, s) {
        FirstIndexPrefix(sl, n - 1, s);
      }
      if x !in d' {
        var d := d' + [x];
        assert Distinct(sl) == d;
        assert x !in p;
        forall i, j | 0 <= i < j < |d| ensures d[i] != d[j] {
          assert d[i] == d'[i] && d'[i] in d';
          if j < |d'| { assert d[j] == d'[j]; }
        }
        assert forall i :: 0 <= i < n - 1 ==> sl[i] != x by {
          forall i | 0 <= i < n - 1 ensures sl[i] != x {
            assert sl[i] == p[i];
          }
        }
        assert FirstIndex(sl, x) == n - 1;
        assert forall s :: s in p ==> FirstIndex(p, s) < n - 1;
      } else {
        assert Distinct(sl) == d';
      }
    }
  }

  /**
    `resolv`: the distinct elements of `sl`, each once, in the order of
    their first occurrence.
   */
  method Resolv(sl: seq<string>) returns (term: seq<string>)
    ensures term == Distinct(sl)
    ensures forall s :: s in term <==> s in sl
    ensures forall i, j :: 0 <= i < j < |term| ==> term[i] != term[j]
    ensures forall i, j :: 0 <= i < j < |term| ==> FirstIndex(sl, term[i]) < FirstIndex(sl, term[j])
  {
    term := [];
    for k := 0 to |sl|
      invariant term == Distinct(sl[..k])
    {
      assert sl[..k + 1][..k] == sl[..k];
      var seen := Check(term, sl[k]);
      if !seen {
        term := term + [sl[k]];
      }
    }
    assert sl[..|sl|] == sl;
    DistinctMeaning(sl);
  }

  /** `checkURL`: some queued command has exactly this URL string. */
  method CheckURL(sl: seq<Cmd>, url: Url) returns (found: bool)
    ensures found <==> exists i :: 0 <= i < |sl| && sl[i].U.text == url.text
  {
    for i := 0 to |sl|
      invariant forall j :: 0 <= j < i ==> sl[j].U.text != url.text
    {
      if sl[i].U.text == url.text {
        return true;
      }
    }
    return false;
  }

  /** `count`: the number of occurrences of `str`, never more than the length. */
  method Count(sl: seq<string>, str: string) returns (num: nat)
    ensures num == multiset(sl)[str]
    ensures num <= |sl|
  {
    num := 0;
    for i := 0 to |sl|
      invariant num == multiset(sl[..i])[str]
      invariant num <= i
    {
      assert sl[..i + 1] == sl[..i] + [sl[i]];
      if sl[i] == str {
        num := num + 1;
      }
    }
    assert sl[..|sl|] == sl;
  }

  const Separator := "_-_"

  /**
    `docName`: the URL string split at "/" and joined with "_-_", so each
    "/" becomes three characters and none is left.
   */
  function DocName(url: Url): (name: string)
    ensures '/' !in name
    ensures |name| == |url.text| + 2 * multiset(url.text)['/']
    ensures name == Replace(url.text, '/', Separator)
  {
    JoinSplit(url.text, '/', Separator);
    ReplaceFacts(url.text, '/', Separator);
    Join(Split(url.text, '/'), Separator)
  }

  /** A "/" and the separator itself give the same file name, so names can collide. */
  lemma DocNameCollides(host: string)
    ensures DocName(Url("a/b", host)) == DocName(Url("a_-_b", host))
  {
    assert Replace("a_-_b", '/', Separator) == "a_-_b";
    assert Replace("a/b", '/', Separator) == "a_-_b";
  }

  /**
    `filter`: the lower-cased URL names an audio, image, video, PDF, Word or
    spreadsheet resource.
   */
  predicate Filter(url: Url) {
    var str := ToLower(url.text);
    if Contains(str, ".mp3") then true
    else if HasSuffix(str, ".pdf") then true
    else if HasSuffix(str, "doc") then true
    else if Contains(str, "ico") then true
    else if Contains(str, "jpeg") then true
    else if Contains(str, "jpg") then true
    else if Contains(str, "png") then true
    else if Contains(str, "mp4") then true
    else if Contains(str, "xlsx") then true
    else false
  }

  /** The filter sees only the lower-cased URL string: case does not matter. */
  lemma FilterIgnoresCase(a: Url, b: Url)
    requires ToLower(a.text) == ToLower(b.text)
    ensures Filter(a) == Filter(b)
  {
  }

  /** Lower-casing the URL first does not change the filter's answer. */
  lemma FilterOfLowered(a: Url)
    ensures Filter(Url(ToLower(a.text), a.host)) == Filter(a)
  {
    ToLowerIdempotent(a.text);
  }

  /** `Contains` means an occurrence at an explicit position. */
  lemma ContainsAt(s: string, sub: string, i: nat)
    requires i + |sub| <= |s| && s[i..i + |sub|] == sub
    ensures Contains(s, sub)
  {
    assert HasPrefix(s[i..], sub);
  }

  /** An upper-case ".PDF" suffix is filtered. */
  lemma FilterUpperCasePdf(host: string)
    ensures Filter(Url("http://h/R.PDF", host))
  {
    var url := "http://h/R.PDF";
    var str := ToLower(url);
    assert url[10..] == ".PDF";
    assert str[10] == '.' && str[11] == 'p' && str[12] == 'd' && str[13] == 'f';
    assert str[10..] == ".pdf";
  }

  /** "ico" is matched anywhere, so a whole host such as mexico.com is filtered. */
  lemma FilterMatchesHostName(host: string)
    ensures Filter(Url("http://mexico.com/", host))
  {
    var url := "http://mexico.com/";
    var str := ToLower(url);
    assert url[10..13] == "ico";
    assert str[10] == 'i' && str[11] == 'c' && str[12] == 'o';
    assert str[10..13] == "ico";
    ContainsAt(str, "ico", 10);
  }
}
